/** Any number of processes on the one kernel heap: every interleaving of their mallocs and
    frees, of new processes, and of the kernel's own allocations. */
module ProcessRuns {
  import opened Machine
  import opened Bits
  import opened BlockTable
  import opened HeapRuns
  import opened Heap
  import opened PageMap
  import opened Paging
  import opened ProcessMemory

  datatype System = System(heap: HeapState, procs: seq<Proc>)

  datatype Event =
    | KernelMalloc(size: u32)
    | KernelFree(ptr: u32)
    | Spawn(stack: u32, image: Allocation, pages: FlatMap)
    | ProcessMalloc(pid: nat, size: u32)
    | ProcessFree(pid: nat, ptr: u32)

  /** The address space of a new process once its stack is mapped. */
  function WithStack(pages: FlatMap, stack: u32): FlatMap {
    AfterMapTo(pages, PROGRAM_VIRTUAL_STACK_ADDRESS_END, AlignAddress(stack),
               AlignAddress(Wrap32(stack + USER_PROGRAM_STACK_SIZE)), USER_RW)
  }

  function NewProc(stack: u32, image: Allocation, pages: FlatMap): Proc {
    Proc(seq(MAX_PROGRAM_ALLOCATIONS, _ => Allocation(0, 0)), WithStack(pages, stack), stack, image)
  }

  ghost predicate Held(s: System, ptr: u32) {
    exists i :: 0 <= i < |s.procs| && ptr in Pointers(s.procs[i])
  }

  /** The kernel frees only live runs that no process holds; a process frees any non-null
      pointer; a new process gets a stack and an image of its own, and its address space, whatever
      its segments, maps the heap region to itself without write access. */
  ghost predicate Enabled(s: System, e: Event) {
    match e
    case KernelMalloc(_) => true
    case KernelFree(ptr) => (exists n :: RunAtAddress(s.heap, ptr, n)) && !Held(s, ptr)
    case Spawn(stack, image, pages) =>
      && RunAtAddress(s.heap, stack, STACK_PAGES) && !Held(s, stack) && image.ptr != stack
      && ImageOk(s.heap, image) && (image.ptr != 0 ==> !Held(s, image.ptr))
      && Loadable(s.heap, pages)
    case ProcessMalloc(pid, _) => pid < |s.procs|
    case ProcessFree(pid, ptr) => pid < |s.procs| && ptr != 0
  }

  /** An address space before its stack is mapped. */
  ghost predicate Loadable(h: HeapState, pages: FlatMap) {
    forall page :: 0 <= page < PAGE_COUNT && InHeapRegion(h, page) ==> pages[page] == MakeEntry(page, USER_RO)
  }

  ghost predicate Ok(s: System) {
    && KernelHeap(s.heap)
    && (forall i :: 0 <= i < |s.procs| ==> ProcOk(s.heap, s.procs[i]))
    && (forall i, j :: 0 <= i < j < |s.procs| ==> Pointers(s.procs[i]) !! Pointers(s.procs[j]))
  }

  ghost function Next(s: System, e: Event): System
    requires Ok(s) && Enabled(s, e)
  {
    match e
    case KernelMalloc(size) => s.(heap := AfterMalloc(s.heap, size))
    case KernelFree(ptr) =>
      AccountsTerminated(s.heap.table, s.heap.cells);
      s.(heap := AfterFree(s.heap, Block(s.heap, ptr)))
    case Spawn(stack, image, pages) => s.(procs := s.procs + [NewProc(stack, image, pages)])
    case ProcessMalloc(pid, size) =>
      var r := ProcMalloc(s.heap, s.procs[pid], size);
      System(r.heap, s.procs[pid := r.proc])
    case ProcessFree(pid, ptr) =>
      var r := ProcFree(s.heap, s.procs[pid], ptr);
      System(r.heap, s.procs[pid := r.proc])
  }

  // ---------------------------------------------------------------- one event

  /** Mapping the stack of a new process changes the four stack pages only. */
  lemma {:induction false} StackMapping(h: HeapState, stack: u32, pages: FlatMap)
    requires KernelHeap(h) && RunAtAddress(h, stack, STACK_PAGES)
    ensures stack / PAGE_SIZE + STACK_PAGES <= PAGE_COUNT
    ensures forall page :: 0 <= page < PAGE_COUNT ==>
              WithStack(pages, stack)[page]
              == if STACK_PAGE <= page < STACK_PAGE + STACK_PAGES
                 then MakeEntry(stack / PAGE_SIZE + (page - STACK_PAGE), USER_RW) else pages[page]
  {
    RunGeometry(h, stack, STACK_PAGES);
    assert MappingAccepted(PROGRAM_VIRTUAL_STACK_ADDRESS_END, stack, stack + USER_PROGRAM_STACK_SIZE);
    assert (stack + USER_PROGRAM_STACK_SIZE - stack) / PAGE_SIZE == STACK_PAGES;
    assert PROGRAM_VIRTUAL_STACK_ADDRESS_END / PAGE_SIZE == STACK_PAGE;
  }

  lemma {:induction false} SpawnOk(h: HeapState, stack: u32, image: Allocation, pages: FlatMap)
    requires KernelHeap(h) && RunAtAddress(h, stack, STACK_PAGES)
    requires image.ptr != stack && ImageOk(h, image) && Loadable(h, pages)
    ensures ProcOk(h, NewProc(stack, image, pages))
    ensures Pointers(NewProc(stack, image, pages)) == {stack} + if image.ptr == 0 then {} else {image.ptr}
    ensures |NewProc(stack, image, pages).slots| == 1024
    ensures forall a <- NewProc(stack, image, pages).slots :: a == Allocation(0, 0)
  {
    var p := NewProc(stack, image, pages);
    RunGeometry(h, stack, STACK_PAGES);
    StackMapping(h, stack, pages);
    forall page | 0 <= page < PAGE_COUNT && InHeapRegion(h, page)
      ensures p.pages[page] == MakeEntry(page, USER_RO) && !Writable(p.pages[page])
      ensures p.pages[page] / PAGE_SIZE == page
    {
      EntryFlags(page, USER_RO);
      EntryPage(page, USER_RO);
    }
    assert WritableOk(h, p);
  }

  /** What process_malloc by one process means to another. */
  lemma {:induction false} MallocByAnother(h: HeapState, p: Proc, size: u32, q: Proc)
    requires KernelHeap(h) && ProcOk(h, p) && ProcOk(h, q)
    ensures var r := ProcMalloc(h, p, size);
            ProcOk(r.heap, q) && (r.ptr != 0 ==> r.ptr !in Pointers(q))
  {
    MallocFrame(h, size, q);
    MallocSound(h, size);
    if Place(h, size).Some? && FindSlot(p.slots, 0, 0).None? {
      var h', ptr := AfterMalloc(h, size), Address(h, Place(h, size).value);
      assert Block(h', ptr) == Place(h, size).value;
      FreeFrame(h', ptr, q);
    }
  }

  lemma {:induction false} FreeByAnother(h: HeapState, p: Proc, ptr: u32, q: Proc)
    requires KernelHeap(h) && ProcOk(h, p) && ProcOk(h, q) && ptr != 0
    requires Pointers(p) !! Pointers(q)
    ensures ProcOk(ProcFree(h, p, ptr).heap, q)
  {
    if FindSlot(p.slots, ptr, 0).Some? {
      assert ptr in Pointers(p);
      PointerIsRun(h, p, ptr);
      FreeFrame(h, ptr, q);
    }
  }

  /** One process and the heap change; the others stay in order and apart from it. */
  lemma {:induction false} OneProcessChanged(s: System, pid: nat, h': HeapState, p': Proc)
    requires Ok(s) && pid < |s.procs| && KernelHeap(h') && ProcOk(h', p')
    requires forall i :: 0 <= i < |s.procs| && i != pid ==>
               ProcOk(h', s.procs[i]) && Pointers(p') !! Pointers(s.procs[i])
    ensures Ok(System(h', s.procs[pid := p']))
  {
  }

  lemma {:induction false} ProcessMallocOk(s: System, pid: nat, size: u32)
    requires Ok(s) && pid < |s.procs|
    ensures Ok(Next(s, ProcessMalloc(pid, size)))
  {
    var r := ProcMalloc(s.heap, s.procs[pid], size);
    ProcMallocOk(s.heap, s.procs[pid], size);
    forall i | 0 <= i < |s.procs| && i != pid
      ensures ProcOk(r.heap, s.procs[i]) && Pointers(r.proc) !! Pointers(s.procs[i])
    {
      MallocByAnother(s.heap, s.procs[pid], size, s.procs[i]);
    }
    OneProcessChanged(s, pid, r.heap, r.proc);
    assert Next(s, ProcessMalloc(pid, size)) == System(r.heap, s.procs[pid := r.proc]);
  }

  lemma {:induction false} ProcessFreeOk(s: System, pid: nat, ptr: u32)
    requires Ok(s) && pid < |s.procs| && ptr != 0
    ensures Ok(Next(s, ProcessFree(pid, ptr)))
  {
    var r := ProcFree(s.heap, s.procs[pid], ptr);
    ProcFreeOk(s.heap, s.procs[pid], ptr);
    forall i | 0 <= i < |s.procs| && i != pid
      ensures ProcOk(r.heap, s.procs[i]) && Pointers(r.proc) !! Pointers(s.procs[i])
    {
      FreeByAnother(s.heap, s.procs[pid], ptr, s.procs[i]);
    }
    OneProcessChanged(s, pid, r.heap, r.proc);
    assert Next(s, ProcessFree(pid, ptr)) == System(r.heap, s.procs[pid := r.proc]);
  }

  /** An allocation for the kernel itself disturbs no process. */
  lemma {:induction false} KernelMallocOk(s: System, size: u32)
    requires Ok(s) && Enabled(s, KernelMalloc(size))
    ensures Ok(Next(s, KernelMalloc(size)))
  {
    MallocSound(s.heap, size);
    forall i | 0 <= i < |s.procs|
      ensures ProcOk(AfterMalloc(s.heap, size), s.procs[i])
    {
      MallocFrame(s.heap, size, s.procs[i]);
    }
  }

  lemma {:induction false} KernelFreeOk(s: System, ptr: u32)
    requires Ok(s) && Enabled(s, KernelFree(ptr))
    ensures Ok(Next(s, KernelFree(ptr)))
  {
    FreeSound(s.heap, Block(s.heap, ptr));
    forall i | 0 <= i < |s.procs|
      ensures ProcOk(Next(s, KernelFree(ptr)).heap, s.procs[i])
    {
      FreeFrame(s.heap, ptr, s.procs[i]);
    }
  }

  /** Every event keeps the whole system in order. */
  lemma {:induction false} NextOk(s: System, e: Event)
    requires Ok(s) && Enabled(s, e)
    ensures Ok(Next(s, e))
  {
    match e
    case KernelMalloc(size) => KernelMallocOk(s, size);
    case KernelFree(ptr) => KernelFreeOk(s, ptr);
    case Spawn(stack, image, pages) => SpawnOk(s.heap, stack, image, pages);
    case ProcessMalloc(pid, size) => ProcessMallocOk(s, pid, size);
    case ProcessFree(pid, ptr) => ProcessFreeOk(s, pid, ptr);
  }

  // ---------------------------------------------------------------- what an event does

  /** Only process pid is different, if any is. */
  ghost predicate OthersStay(s: System, s': System, pid: int) {
    |s'.procs| == |s.procs| && forall j :: 0 <= j < |s.procs| && j != pid ==> s'.procs[j] == s.procs[j]
  }

  /** process_malloc by process pid, where there are blocks and an empty slot. */
  lemma {:induction false} ProcessMallocEffect(s: System, pid: nat, size: u32, b: nat, i: nat)
    requires Ok(s) && pid < |s.procs| && FirstFitFrom(s.heap.table, BlocksFor(size), 0) == Some(b)
    requires FindSlot(s.procs[pid].slots, 0, 0) == Some(i)
    ensures var s' := Next(s, ProcessMalloc(pid, size));
            && Enabled(s, ProcessMalloc(pid, size))
            && OthersStay(s, s', pid) && 0x100_0000 + 4096 * b < TWO_TO_THE_32
            && Allocated(s.heap, s.procs[pid], size, b, i,
                         Outcome(s'.heap, s'.procs[pid], 0x100_0000 + 4096 * b))
  {
    ProcMallocEffect(s.heap, s.procs[pid], size, b, i);
  }

  /** process_free by process pid of a pointer that it holds in slot i. */
  lemma {:induction false} ProcessFreeEffect(s: System, pid: nat, ptr: u32, i: nat)
    requires Ok(s) && pid < |s.procs| && ptr != 0 && FindSlot(s.procs[pid].slots, ptr, 0) == Some(i)
    ensures var s' := Next(s, ProcessFree(pid, ptr));
            && Enabled(s, ProcessFree(pid, ptr))
            && OthersStay(s, s', pid) && GivenBack(s.heap, s.procs[pid], i, Outcome(s'.heap, s'.procs[pid], ptr))
  {
    ProcFreeEffect(s.heap, s.procs[pid], ptr, i);
  }

  /** What the kernel allocates and frees is marked and cleared in the same way. */
  lemma {:induction false} KernelMallocEffect(s: System, size: u32, b: nat)
    requires Ok(s) && FirstFitFrom(s.heap.table, BlocksFor(size), 0) == Some(b)
    ensures var s' := Next(s, KernelMalloc(size));
            && Enabled(s, KernelMalloc(size))
            && OthersStay(s, s', -1) && RunMarked(s.heap.table, s'.heap.table, b, BlocksFor(size))
  {
  }

  lemma {:induction false} KernelFreeEffect(s: System, ptr: u32, n: nat)
    requires Ok(s) && RunAtAddress(s.heap, ptr, n)
    requires forall i :: 0 <= i < |s.procs| ==> ptr !in Pointers(s.procs[i])
    ensures Enabled(s, KernelFree(ptr))
    ensures var s' := Next(s, KernelFree(ptr));
            OthersStay(s, s', -1) && RunCleared(s.heap.table, s'.heap.table, (ptr - 0x100_0000) / 4096, n)
  {
    FreeAccounts(s.heap.table, s.heap.cells, Block(s.heap, ptr), n);
  }

  /** How many blocks an event takes out of the heap for good: one for every run that is freed, and
      one for a process_malloc that finds blocks but no slot. */
  function Loses(s: System, e: Event): nat {
    match e
    case KernelMalloc(_) => 0
    case KernelFree(_) => 1
    case Spawn(_, _, _) => 0
    case ProcessMalloc(pid, size) =>
      if pid < |s.procs| && FirstFitFrom(s.heap.table, BlocksFor(size), 0).Some?
         && FindSlot(s.procs[pid].slots, 0, 0).None? then 1 else 0
    case ProcessFree(pid, ptr) =>
      if pid < |s.procs| && FindSlot(s.procs[pid].slots, ptr, 0).Some? then 1 else 0
  }

  lemma {:induction false} NextLoses(s: System, e: Event)
    requires Ok(s) && Enabled(s, e)
    ensures KernelHeap(Next(s, e).heap)
    ensures ResiduesUpTo(Next(s, e).heap.cells, |s.heap.cells|)
         == ResiduesUpTo(s.heap.cells, |s.heap.cells|) + Loses(s, e)
  {
    NextOk(s, e);
    match e
    case KernelMalloc(size) => MallocSound(s.heap, size);
    case KernelFree(ptr) => FreeSound(s.heap, Block(s.heap, ptr));
    case Spawn(_, _, _) =>
    case ProcessMalloc(pid, size) => MallocLoses(s.heap, s.procs[pid], size);
    case ProcessFree(pid, ptr) =>
      if FindSlot(s.procs[pid].slots, ptr, 0).Some? {
        ProcFreeEffect(s.heap, s.procs[pid], ptr, FindSlot(s.procs[pid].slots, ptr, 0).value);
      }
  }

  lemma {:induction false} MallocLoses(h: HeapState, p: Proc, size: u32)
    requires KernelHeap(h) && ProcOk(h, p)
    ensures KernelHeap(ProcMalloc(h, p, size).heap)
    ensures ResiduesUpTo(ProcMalloc(h, p, size).heap.cells, |h.cells|)
         == ResiduesUpTo(h.cells, |h.cells|) + if Place(h, size).Some? && FindSlot(p.slots, 0, 0).None? then 1 else 0
  {
    ProcMallocOk(h, p, size);
    MallocSound(h, size);
    if Place(h, size).Some? && FindSlot(p.slots, 0, 0).None? {
      FreeSound(AfterMalloc(h, size), Place(h, size).value);
    }
  }

  // ---------------------------------------------------------------- every run

  /** Each event is enabled when its turn comes. */
  ghost predicate Legal(s: System, events: seq<Event>)
    requires Ok(s)
    decreases |events|
  {
    events == [] ||
    (Enabled(s, events[0]) && (NextOk(s, events[0]); Legal(Next(s, events[0]), events[1..])))
  }

  ghost function Exec(s: System, events: seq<Event>): System
    requires Ok(s) && Legal(s, events)
    decreases |events|
  {
    if events == [] then s else NextOk(s, events[0]); Exec(Next(s, events[0]), events[1..])
  }

  /** The system at boot: an empty kernel heap and no process. */
  ghost predicate Boot(s: System) {
    Empty(s.heap) && s.heap.base == HEAP_ADDRESS && |s.heap.table| == HEAP_SIZE / BLOCK_SIZE && s.procs == []
  }

  lemma {:induction false} ExecOk(s: System, events: seq<Event>)
    requires Ok(s) && Legal(s, events)
    ensures Ok(Exec(s, events))
    decreases |events|
  {
    if events != [] {
      NextOk(s, events[0]);
      ExecOk(Next(s, events[0]), events[1..]);
    }
  }

  /** The blocks lost in a run. */
  ghost function AllLost(s: System, events: seq<Event>): nat
    requires Ok(s) && Legal(s, events)
    decreases |events|
  {
    if events == [] then 0 else NextOk(s, events[0]); Loses(s, events[0]) + AllLost(Next(s, events[0]), events[1..])
  }

  lemma {:induction false} ExecLoses(s: System, events: seq<Event>)
    requires Ok(s) && Legal(s, events)
    ensures KernelHeap(Exec(s, events).heap)
    ensures ResiduesUpTo(Exec(s, events).heap.cells, |s.heap.cells|)
         == ResiduesUpTo(s.heap.cells, |s.heap.cells|) + AllLost(s, events)
    decreases |events|
  {
    if events != [] {
      NextOk(s, events[0]);
      NextLoses(s, events[0]);
      ExecLoses(Next(s, events[0]), events[1..]);
    }
  }

  /** Conservation over every run of the whole system: the blocks taken are those of the live runs,
      and one for every run that was ever freed and for every process_malloc without a slot. */
  lemma {:induction false} SystemConserves(s0: System, events: seq<Event>)
    requires Boot(s0) && Ok(s0) && Legal(s0, events)
    ensures var h := Exec(s0, events).heap;
            |h.cells| == |h.table| && Taken(h.table) == RunLengthsUpTo(h.cells, |h.cells|) + AllLost(s0, events)
  {
    EmptyHasNoResidue(s0.heap.cells, |s0.heap.cells|);
    ExecLoses(s0, events);
    Conservation(Exec(s0, events).heap.table, Exec(s0, events).heap.cells);
  }

  /** A heap as at boot exists. */
  lemma {:induction false} BootExists() returns (s: System)
    ensures Boot(s) && Ok(s)
  {
    var n := HEAP_SIZE / BLOCK_SIZE;
    s := System(HeapState(HEAP_ADDRESS, seq(n, _ => FREE), seq(n, _ => Unused)), []);
  }

  /** Some run of enabled events leads from boot to s. */
  ghost predicate Reachable(s: System) {
    exists s0, events :: Boot(s0) && Ok(s0) && Legal(s0, events) && Exec(s0, events) == s
  }

  lemma {:induction false} ReachableOk(s: System)
    requires Reachable(s)
    ensures Ok(s)
  {
    var s0, events :| Boot(s0) && Ok(s0) && Legal(s0, events) && Exec(s0, events) == s;
    ExecOk(s0, events);
  }

  /** Booting is possible, and whatever happens next is reachable too. */
  lemma {:induction false} BootReachable(s: System)
    requires Boot(s)
    ensures Reachable(s)
  {
    assert Ok(s) && Legal(s, []) && Exec(s, []) == s;
  }

  lemma {:induction false} ExecSnoc(s: System, events: seq<Event>, e: Event)
    requires Ok(s) && Legal(s, events) && Ok(Exec(s, events)) && Enabled(Exec(s, events), e)
    ensures Legal(s, events + [e]) && Exec(s, events + [e]) == Next(Exec(s, events), e)
    decreases |events|
  {
    if events == [] {
      NextOk(s, e);
      assert [e][1..] == [];
      assert events + [e] == [e];
    } else {
      NextOk(s, events[0]);
      ExecSnoc(Next(s, events[0]), events[1..], e);
      assert (events + [e])[1..] == events[1..] + [e];
    }
  }

  lemma {:induction false} NextReachable(s: System, e: Event)
    requires Reachable(s) && Ok(s) && Enabled(s, e)
    ensures Reachable(Next(s, e))
  {
    var s0, events :| Boot(s0) && Ok(s0) && Legal(s0, events) && Exec(s0, events) == s;
    ExecSnoc(s0, events, e);
    assert Exec(s0, events + [e]) == Next(s, e);
  }

  lemma {:induction false} FrameNumber(entry: u32)
    ensures Frame(entry) / PAGE_SIZE == entry / PAGE_SIZE
  {
    AlignedWord(Frame(entry), entry);
  }

  lemma {:induction false} StackPageEntry(h: HeapState, p: Proc, page: nat)
    requires StackOk(h, p.pages, p.stack) && STACK_PAGE <= page < STACK_PAGE + STACK_PAGES
    ensures Writable(p.pages[page]) && p.pages[page] / PAGE_SIZE == p.stack / PAGE_SIZE + (page - STACK_PAGE)
  {
    EntryFlags(p.stack / PAGE_SIZE + (page - STACK_PAGE), USER_RW);
    EntryPage(p.stack / PAGE_SIZE + (page - STACK_PAGE), USER_RW);
  }

  lemma {:induction false} SlotPageEntry(h: HeapState, m: FlatMap, a: Allocation, page: nat)
    requires SlotOk(h, m, a) && page < PAGE_COUNT && InAllocation(a, page)
    ensures Writable(m[page]) && m[page] / PAGE_SIZE == page
  {
    EntryFlags(page, USER_RW);
    EntryPage(page, USER_RW);
  }

  /** The pages given to a process are writable. */
  lemma {:induction false} GivenIsWritable(h: HeapState, p: Proc, page: nat)
    requires SlotsOk(h, p) && StackOk(h, p.pages, p.stack) && page < PAGE_COUNT && GivenPage(p, page)
    ensures Writable(p.pages[page])
  {
    if STACK_PAGE <= page < STACK_PAGE + STACK_PAGES {
      StackPageEntry(h, p, page);
    } else {
      var i :| 0 <= i < |p.slots| && InAllocation(p.slots[i], page);
      SlotPageEntry(h, p.pages, p.slots[i], page);
    }
  }

  /** The frame lies in a run that the process holds. */
  ghost predicate HeldFrame(h: HeapState, p: Proc, frame: int) {
    exists ptr, n :: ptr in Pointers(p) && RunAtAddress(h, ptr, n) && InRun(ptr, n, frame)
  }

  predicate InRun(ptr: u32, n: nat, frame: int) {
    ptr / PAGE_SIZE <= frame < ptr / PAGE_SIZE + n
  }

  lemma {:induction false} GivenPageIsHeld(h: HeapState, p: Proc, page: nat)
    requires SlotsOk(h, p) && StackOk(h, p.pages, p.stack) && page < PAGE_COUNT && GivenPage(p, page)
    ensures HeldFrame(h, p, p.pages[page] / PAGE_SIZE)
  {
    if STACK_PAGE <= page < STACK_PAGE + STACK_PAGES {
      StackPageEntry(h, p, page);
      assert InRun(p.stack, STACK_PAGES, p.pages[page] / PAGE_SIZE);
    } else {
      var i :| 0 <= i < |p.slots| && InAllocation(p.slots[i], page);
      SlotPageEntry(h, p.pages, p.slots[i], page);
      assert InRun(p.slots[i].ptr, BlocksFor(p.slots[i].size), p.pages[page] / PAGE_SIZE);
    }
  }

  lemma {:induction false} OwnMemoryIsHeld(h: HeapState, p: Proc, frame: int)
    requires ImageOk(h, p.image) && RunAtAddress(h, p.stack, STACK_PAGES) && OwnMemory(p, frame)
    ensures HeldFrame(h, p, frame)
  {
    if InAllocation(p.image, frame) {
      assert InRun(p.image.ptr, BlocksFor(p.image.size), frame);
    } else {
      assert InRun(p.stack, STACK_PAGES, frame);
    }
  }

  /** All that a contained process may write lies in runs that it holds. */
  lemma {:induction false} WritablePageIsHeld(h: HeapState, p: Proc, page: nat)
    requires ProcOk(h, p) && Contained(p) && page < PAGE_COUNT && Writable(p.pages[page])
    ensures HeldFrame(h, p, p.pages[page] / PAGE_SIZE)
  {
    if GivenPage(p, page) {
      GivenPageIsHeld(h, p, page);
    } else {
      OwnMemoryIsHeld(h, p, p.pages[page] / PAGE_SIZE);
    }
  }

  /** A frame that one process holds is in no live run that it does not hold. */
  lemma {:induction false} HeldFrameApart(h: HeapState, p: Proc, frame: int, ptr: u32, n: nat)
    requires KernelHeap(h) && HeldFrame(h, p, frame) && RunAtAddress(h, ptr, n) && ptr !in Pointers(p)
    ensures !InRun(ptr, n, frame)
  {
    var ptr', n' :| ptr' in Pointers(p) && RunAtAddress(h, ptr', n') && InRun(ptr', n', frame);
    RunsShareNoPage(h, ptr', n', ptr, n, frame);
  }

  lemma {:induction false} HeldByOne(s: System, a: nat, b: nat, frame: int)
    requires Ok(s) && a < |s.procs| && b < |s.procs| && a != b
    requires HeldFrame(s.heap, s.procs[a], frame)
    ensures !HeldFrame(s.heap, s.procs[b], frame)
  {
    forall ptr, n | ptr in Pointers(s.procs[b]) && RunAtAddress(s.heap, ptr, n)
      ensures !InRun(ptr, n, frame)
    {
      assert Pointers(s.procs[a]) !! Pointers(s.procs[b]);
      HeldFrameApart(s.heap, s.procs[a], frame, ptr, n);
    }
  }

  /** In every reachable state each slot in use is a live run of exactly the blocks it needs,
      mapped to itself, writable and open to the user, and a page of the heap is writable only
      inside such a slot. */
  lemma {:induction false} EveryProcessInOrder(s: System, pid: nat, i: nat, page: nat)
    requires Reachable(s) && pid < |s.procs|
    requires i < MAX_PROGRAM_ALLOCATIONS && page < PAGE_COUNT
    ensures var p := s.procs[pid];
            && |p.slots| == MAX_PROGRAM_ALLOCATIONS
            && (p.slots[i].ptr != 0 ==> RunAtAddress(s.heap, p.slots[i].ptr, BlocksFor(p.slots[i].size)))
            && (InAllocation(p.slots[i], page) ==> p.pages[page] == MakeEntry(page, USER_RW))
            && (InHeapRegion(s.heap, page) && Writable(p.pages[page]) ==>
                  exists j :: 0 <= j < |p.slots| && InAllocation(p.slots[j], page))
  {
    ReachableOk(s);
    var p := s.procs[pid];
    assert ProcOk(s.heap, p) && SlotOk(s.heap, p.pages, p.slots[i]);
    if InHeapRegion(s.heap, page) && Writable(p.pages[page]) {
      assert GivenPage(p, page);
      RunGeometry(s.heap, p.stack, STACK_PAGES);
    }
  }

  /** Slots of one process never overlap. */
  lemma {:induction false} SlotsShareNoPage(s: System, pid: nat, i: nat, j: nat, page: nat)
    requires Reachable(s) && pid < |s.procs| && i < j < |s.procs[pid].slots|
    ensures !(InAllocation(s.procs[pid].slots[i], page) && InAllocation(s.procs[pid].slots[j], page))
  {
    ReachableOk(s);
    var p := s.procs[pid];
    var a, b := p.slots[i], p.slots[j];
    assert SlotOk(s.heap, p.pages, a) && SlotOk(s.heap, p.pages, b);
    if InAllocation(a, page) && b.ptr != 0 {
      RunsShareNoPage(s.heap, a.ptr, BlocksFor(a.size), b.ptr, BlocksFor(b.size), page);
    }
  }

  /** No frame is ever given to two processes, by process_malloc or as stack, whatever segments
      the processes have. */
  lemma {:induction false} FramesNeverShared(s: System, a: nat, b: nat, page: nat, page': nat)
    requires Reachable(s) && a < |s.procs| && b < |s.procs| && a != b
    requires page < PAGE_COUNT && page' < PAGE_COUNT
    requires GivenPage(s.procs[a], page) && GivenPage(s.procs[b], page')
    ensures Frame(s.procs[a].pages[page]) != Frame(s.procs[b].pages[page'])
  {
    ReachableOk(s);
    GivenPageIsHeld(s.heap, s.procs[a], page);
    GivenPageIsHeld(s.heap, s.procs[b], page');
    HeldByOne(s, a, b, s.procs[a].pages[page] / PAGE_SIZE);
    FrameNumber(s.procs[a].pages[page]);
    FrameNumber(s.procs[b].pages[page']);
  }

  // ---------------------------------------------------------------- what processes may write

  /** A contained process stays contained, whatever happens. */
  lemma {:induction false} NextContained(s: System, e: Event, i: nat)
    requires Ok(s) && Enabled(s, e) && i < |s.procs| && Contained(s.procs[i])
    ensures i < |Next(s, e).procs| && Contained(Next(s, e).procs[i])
  {
    match e
    case KernelMalloc(_) =>
    case KernelFree(_) =>
    case Spawn(_, _, _) =>
    case ProcessMalloc(pid, size) =>
      if pid == i {
        MallocContained(s.heap, s.procs[i], size);
      }
    case ProcessFree(pid, ptr) =>
      if pid == i {
        FreeContained(s.heap, s.procs[i], ptr);
      }
  }

  lemma {:induction false} ExecContained(s: System, events: seq<Event>, i: nat)
    requires Ok(s) && Legal(s, events) && i < |s.procs| && Contained(s.procs[i])
    ensures i < |Exec(s, events).procs| && Contained(Exec(s, events).procs[i])
    decreases |events|
  {
    if events != [] {
      NextOk(s, events[0]);
      NextContained(s, events[0], i);
      ExecContained(Next(s, events[0]), events[1..], i);
    }
  }

  /** In every reachable state, what is given to a process, and all that a contained one may write,
      is in no live run that it does not hold. */
  lemma {:induction false} WritesStayInside(s: System, a: nat, page: nat, ptr: u32, n: nat)
    requires Reachable(s) && a < |s.procs| && page < PAGE_COUNT
    requires GivenPage(s.procs[a], page) || (Contained(s.procs[a]) && Writable(s.procs[a].pages[page]))
    requires RunAtAddress(s.heap, ptr, n) && ptr !in Pointers(s.procs[a])
    ensures !InRun(ptr, n, Frame(s.procs[a].pages[page]) / PAGE_SIZE)
  {
    ReachableOk(s);
    if GivenPage(s.procs[a], page) {
      GivenPageIsHeld(s.heap, s.procs[a], page);
    } else {
      WritablePageIsHeld(s.heap, s.procs[a], page);
    }
    FrameNumber(s.procs[a].pages[page]);
    HeldFrameApart(s.heap, s.procs[a], s.procs[a].pages[page] / PAGE_SIZE, ptr, n);
  }

  /** So it is none of the pages that a directory of the kernel's making consists of. */
  lemma {:induction false} PageTablesNeverWritten(s: System, a: nat, page: nat, pages: seq<u32>, k: nat)
    requires Reachable(s) && a < |s.procs| && page < PAGE_COUNT
    requires GivenPage(s.procs[a], page) || (Contained(s.procs[a]) && Writable(s.procs[a].pages[page]))
    requires LivePages(s.heap.cells, s.heap.base, pages) && k < |pages| && !Held(s, pages[k])
    ensures Frame(s.procs[a].pages[page]) != pages[k]
  {
    ReachableOk(s);
    LivePageIsRun(s.heap, pages[k]);
    WritesStayInside(s, a, page, pages[k], 1);
    assert InRun(pages[k], 1, pages[k] / PAGE_SIZE);
  }

  lemma {:induction false} LivePageIsRun(h: HeapState, page: u32)
    requires KernelHeap(h) && IsLivePage(h.cells, h.base, page)
    ensures RunAtAddress(h, page, 1)
  {
    AlignedDifference(page, h.base);
  }

  lemma {:induction false} AlignedDifference(page: u32, base: u32)
    requires page % BLOCK_SIZE == 0 && base % BLOCK_SIZE == 0
    ensures (page - base) % BLOCK_SIZE == 0
  {
  }

  /** And no two contained processes may ever write to the same frame. */
  lemma {:induction false} WritableFramesNeverShared(s: System, a: nat, b: nat, page: nat, page': nat)
    requires Reachable(s) && a < |s.procs| && b < |s.procs| && a != b
    requires Contained(s.procs[a]) && Contained(s.procs[b]) && page < PAGE_COUNT && page' < PAGE_COUNT
    requires Writable(s.procs[a].pages[page]) && Writable(s.procs[b].pages[page'])
    ensures Frame(s.procs[a].pages[page]) != Frame(s.procs[b].pages[page'])
  {
    ReachableOk(s);
    WritablePageIsHeld(s.heap, s.procs[a], page);
    WritablePageIsHeld(s.heap, s.procs[b], page');
    HeldByOne(s, a, b, s.procs[a].pages[page] / PAGE_SIZE);
    FrameNumber(s.procs[a].pages[page]);
    FrameNumber(s.procs[b].pages[page']);
  }
}
